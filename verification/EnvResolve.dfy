/**
 The effective environment of an app instance, a cron job or a serverless instance: loops that merge layers of
 rows into a map and list it in key order. The rows of a layer arrive in whatever order the database returns.
 */
module EnvResolve {
  import opened Common
  import opened EnvPool

  /** A row of a query result; the value is None when it does not decrypt. */
  datatype Row = Row(key: string, value: Option<string>)

  type Env = map<string, string>

  function Lookup(m: Env, key: string): Option<string> {
    if key in m then Some(m[key]) else None
  }

  // ---------- key order ----------

  /** The order of Rust strings, character by character. */
  predicate Less(a: string, b: string) {
    |b| > 0 && (|a| == 0 || a[0] < b[0] || (a[0] == b[0] && Less(a[1..], b[1..])))
  }

  /** That is: at the first difference the smaller character, or the end of the string, comes first. */
  lemma {:induction false} LessExactly(a: string, b: string)
    ensures Less(a, b) <==>
      exists n: nat :: DifferAt(a, b, n) && n < |b| && (n == |a| || a[n] < b[n])
  {
    if |a| > 0 && |b| > 0 && a[0] == b[0] {
      LessExactly(a[1..], b[1..]);
      if n: nat :| DifferAt(a[1..], b[1..], n) && n < |b[1..]| && (n == |a[1..]| || a[1..][n] < b[1..][n]) {
        assert a[..n + 1] == [a[0]] + a[1..][..n] && b[..n + 1] == [b[0]] + b[1..][..n];
        assert DifferAt(a, b, n + 1);
      }
      if n: nat :| DifferAt(a, b, n) && n < |b| && (n == |a| || a[n] < b[n]) {
        assert n > 0;
        assert a[1..][..n - 1] == a[..n][1..] && b[1..][..n - 1] == b[..n][1..];
        assert DifferAt(a[1..], b[1..], n - 1);
      }
    } else if |b| > 0 {
      assert DifferAt(a, b, 0);
      assert forall n: nat :: DifferAt(a, b, n) ==> n == 0;
    }
  }

  /** The first `n` characters agree, and the next ones do not, as far as there are any. */
  ghost predicate DifferAt(a: string, b: string, n: nat) {
    && n <= |a| && n <= |b| && a[..n] == b[..n]
    && (n < |a| && n < |b| ==> a[n] != b[n])
  }

  lemma {:induction false} LessTransitive(a: string, b: string, c: string)
    requires Less(a, b) && Less(b, c)
    ensures Less(a, c)
  {
    if |a| > 0 && a[0] == b[0] == c[0] {
      LessTransitive(a[1..], b[1..], c[1..]);
    }
  }

  lemma {:induction false} LessTotal(a: string, b: string)
    ensures Less(a, b) || Less(b, a) || a == b
    ensures !(Less(a, b) && Less(b, a)) && (a == b ==> !Less(a, b))
  {
    if |a| > 0 && |b| > 0 && a[0] == b[0] {
      LessTotal(a[1..], b[1..]);
      assert a == [a[0]] + a[1..] && b == [b[0]] + b[1..];
    }
  }

  ghost predicate Sorted(out: seq<(string, string)>) {
    forall i, j :: 0 <= i < j < |out| ==> Less(out[i].0, out[j].0)
  }

  /** The entries of `out` are exactly those of `m`. */
  ghost predicate Lists(out: seq<(string, string)>, m: Env) {
    forall e :: e in out <==> e.0 in m && m[e.0] == e.1
  }

  function Insert(out: seq<(string, string)>, e: (string, string)): seq<(string, string)> {
    if |out| == 0 || Less(e.0, out[0].0) then [e] + out else [out[0]] + Insert(out[1..], e)
  }

  lemma {:induction false} InsertSorted(out: seq<(string, string)>, e: (string, string))
    requires Sorted(out) && forall x <- out :: x.0 != e.0
    ensures Sorted(Insert(out, e))
    ensures forall x :: x in Insert(out, e) <==> x in out || x == e
  {
    var r := Insert(out, e);
    if |out| == 0 {
    } else if Less(e.0, out[0].0) {
      forall i, j | 0 <= i < j < |r| ensures Less(r[i].0, r[j].0) {
        if i == 0 && j > 1 { LessTransitive(e.0, out[0].0, r[j].0); }
      }
    } else {
      InsertSorted(out[1..], e);
      LessTotal(e.0, out[0].0);
      assert out[0] in out;
      forall i, j | 0 <= i < j < |r| ensures Less(r[i].0, r[j].0) {
        assert r[j] == Insert(out[1..], e)[j - 1];
        assert i > 0 ==> r[i] == Insert(out[1..], e)[i - 1];
        assert r[j] in out[1..] || r[j] == e;
      }
    }
  }

  /** There is only one sorted listing of a map, so the order in which rows arrived cannot show. */
  lemma {:induction false} ListingIsUnique(a: seq<(string, string)>, b: seq<(string, string)>, m: Env)
    requires Sorted(a) && Sorted(b) && Lists(a, m) && Lists(b, m)
    ensures a == b
  {
    EmptyListing(a, m);
    EmptyListing(b, m);
    if |a| > 0 {
      FirstIsLeast(a, b, m);
      FirstIsLeast(b, a, m);
      LessTotal(a[0].0, b[0].0);
      var rest := m - {a[0].0};
      TailLists(a, m);
      TailLists(b, m);
      ListingIsUnique(a[1..], b[1..], rest);
      assert a == [a[0]] + a[1..] && b == [b[0]] + b[1..];
    }
  }

  lemma EmptyListing(a: seq<(string, string)>, m: Env)
    requires Lists(a, m)
    ensures |a| == 0 <==> m == map[]
  {
    if |a| > 0 {
      assert a[0] in a;
    }
    if m != map[] {
      var k :| k in m;
      assert (k, m[k]) in a;
    }
  }

  lemma FirstIsLeast(a: seq<(string, string)>, b: seq<(string, string)>, m: Env)
    requires Sorted(a) && Lists(a, m) && Lists(b, m) && |a| > 0 && |b| > 0
    ensures a[0].0 == b[0].0 || Less(a[0].0, b[0].0)
    ensures a[0].0 == b[0].0 ==> a[0] == b[0]
  {
    assert b[0] in b && a[0] in a;
    assert b[0] in a;
  }

  lemma TailLists(a: seq<(string, string)>, m: Env)
    requires Sorted(a) && Lists(a, m) && |a| > 0
    ensures Lists(a[1..], m - {a[0].0})
  {
    LessTotal(a[0].0, a[0].0);
    forall e ensures e in a[1..] <==> e.0 in m - {a[0].0} && m[e.0] == e.1 {
      assert e in a <==> e == a[0] || e in a[1..];
      if e in a[1..] {
        var i :| 0 <= i < |a[1..]| && a[1..][i] == e;
        assert Less(a[0].0, a[i + 1].0);
        assert e in a;
      }
    }
  }

  // ---------- the loops ----------

  /** Inserting rows one after the other; a row that does not decrypt is passed over. */
  function Merge(m: Env, rows: seq<Row>): Env {
    if |rows| == 0 then m else
    var before := Merge(m, rows[..|rows| - 1]);
    var r := rows[|rows| - 1];
    if r.value.None? then before else before[r.key := r.value.value]
  }

  method InsertRows(m: Env, rows: seq<Row>) returns (out: Env)
    ensures out == Merge(m, rows)
  {
    out := m;
    for i := 0 to |rows|
      invariant out == Merge(m, rows[..i])
    {
      assert rows[..i + 1][..i] == rows[..i];
      if rows[i].value.Some? {
        out := out[rows[i].key := rows[i].value.value];
      }
    }
    assert rows[..|rows|] == rows;
  }

  /** `finalize`: the entries of the hash map, in no particular order, are sorted by key. */
  method Finalize(m: Env) returns (out: seq<(string, string)>)
    ensures Sorted(out) && Lists(out, m)
  {
    out := [];
    var keys := m.Keys;
    while keys != {}
      invariant keys <= m.Keys && Sorted(out)
      invariant forall e :: e in out <==> e.0 in m && e.0 !in keys && m[e.0] == e.1
      decreases keys
    {
      var k :| k in keys;
      InsertSorted(out, (k, m[k]));
      out := Insert(out, (k, m[k]));
      keys := keys - {k};
    }
  }

  function Upper(rows: seq<Row>, upper: string -> string): (r: seq<Row>)
    ensures |r| == |rows|
    ensures forall i :: 0 <= i < |rows| ==> r[i] == Row(upper(rows[i].key), rows[i].value)
  {
    if |rows| == 0 then [] else [Row(upper(rows[0].key), rows[0].value)] + Upper(rows[1..], upper)
  }

  /** `resolve_cron_env`, `resolve_instance_env` and, on the non-secret rows, `resolve_instance_build_env`. */
  method ResolveEnv(linked: seq<Row>, own: seq<Row>) returns (out: seq<(string, string)>)
    ensures Sorted(out) && Lists(out, Merged([], linked, own))
    ensures Consistent(linked) && Consistent(own) ==>
      forall key, v :: (key, v) in out <==> Wins([], linked, own, key, v)
  {
    var m := InsertRows(map[], linked);
    m := InsertRows(m, own);
    out := Finalize(m);
    ListedWins([], linked, own, out);
  }

  /** `resolve_instance_env_map` of a serverless instance. */
  method ResolveServerlessEnv(inherit: bool, pool: seq<Row>, linked: seq<Row>, own: seq<Row>, upper: string -> string)
    returns (out: seq<(string, string)>)
    ensures
      var base := if inherit then Upper(pool, upper) else [];
      var (links, mine) := (Upper(linked, upper), Upper(own, upper));
      && Sorted(out) && Lists(out, Merged(base, links, mine))
      && (Consistent(base) && Consistent(links) && Consistent(mine) ==>
            forall key, v :: (key, v) in out <==> Wins(base, links, mine, key, v))
  {
    var m: Env := map[];
    if inherit {
      m := InsertRows(m, Upper(pool, upper));
    }
    m := InsertRows(m, Upper(linked, upper));
    m := InsertRows(m, Upper(own, upper));
    out := Finalize(m);
    ListedWins(if inherit then Upper(pool, upper) else [], Upper(linked, upper), Upper(own, upper), out);
  }

  // ---------- layers ----------

  predicate Clash(a: Row, b: Row) {
    a.key == b.key && a.value.Some? && b.value.Some? && a.value != b.value
  }

  /** Rows of the same key that decrypt agree. A layer with one row per key is consistent. */
  ghost predicate Consistent(rows: seq<Row>) {
    forall i, j :: 0 <= i < j < |rows| ==> !Clash(rows[i], rows[j])
  }

  ghost predicate HasValue(rows: seq<Row>, key: string, value: string) {
    Row(key, Some(value)) in rows
  }

  ghost predicate HasKey(rows: seq<Row>, key: string) {
    exists v :: HasValue(rows, key, v)
  }

  /** Three layers, the later overriding the earlier. */
  ghost predicate Wins(pool: seq<Row>, linked: seq<Row>, own: seq<Row>, key: string, v: string) {
    || HasValue(own, key, v)
    || (!HasKey(own, key) && HasValue(linked, key, v))
    || (!HasKey(own, key) && !HasKey(linked, key) && HasValue(pool, key, v))
  }

  /** The map the loops build from three layers. */
  function Merged(pool: seq<Row>, linked: seq<Row>, own: seq<Row>): Env {
    Merge(Merge(Merge(map[], pool), linked), own)
  }

  /** The value of the last row of a key that decrypts. */
  function LastOf(rows: seq<Row>, key: string): Option<string> {
    if |rows| == 0 then None else
    var last := rows[|rows| - 1];
    if last.key == key && last.value.Some? then last.value else LastOf(rows[..|rows| - 1], key)
  }

  /** Whether a layer is consistent or not, the last row of a key decides. */
  lemma {:induction false} MergeAt(m: Env, rows: seq<Row>, key: string)
    ensures Lookup(Merge(m, rows), key) == if LastOf(rows, key).Some? then LastOf(rows, key) else Lookup(m, key)
  {
    if |rows| > 0 {
      MergeAt(m, rows[..|rows| - 1], key);
    }
  }

  lemma {:induction false} LastOfIsThere(rows: seq<Row>, key: string)
    ensures LastOf(rows, key).Some? <==> HasKey(rows, key)
    ensures LastOf(rows, key).Some? ==> HasValue(rows, key, LastOf(rows, key).value)
  {
    if |rows| > 0 {
      var init, last := rows[..|rows| - 1], rows[|rows| - 1];
      assert forall r :: r in rows <==> r in init || r == last;
      LastOfIsThere(init, key);
      if last.key == key && last.value.Some? {
        assert HasValue(rows, key, last.value.value);
      } else {
        forall v ensures HasValue(rows, key, v) <==> HasValue(init, key, v) {}
      }
    }
  }

  lemma ConsistentValues(rows: seq<Row>, key: string, v: string, w: string)
    requires Consistent(rows) && HasValue(rows, key, v) && HasValue(rows, key, w)
    ensures v == w
  {
    var i :| 0 <= i < |rows| && rows[i] == Row(key, Some(v));
    var j :| 0 <= j < |rows| && rows[j] == Row(key, Some(w));
    assert i < j || j < i || i == j;
  }

  /** A consistent layer overrides what is below it. */
  lemma MergeOverrides(m: Env, rows: seq<Row>, key: string)
    requires Consistent(rows)
    ensures forall v :: HasValue(rows, key, v) ==> Lookup(Merge(m, rows), key) == Some(v)
    ensures (forall v :: !HasValue(rows, key, v)) ==> Lookup(Merge(m, rows), key) == Lookup(m, key)
  {
    MergeAt(m, rows, key);
    LastOfIsThere(rows, key);
    forall v | HasValue(rows, key, v) ensures LastOf(rows, key) == Some(v) {
      ConsistentValues(rows, key, v, LastOf(rows, key).value);
    }
  }

  /** Three consistent layers: the own value of a key, or else the linked one, or else that of the pool. */
  lemma LayersOverride(pool: seq<Row>, linked: seq<Row>, own: seq<Row>, key: string, v: string)
    requires Consistent(pool) && Consistent(linked) && Consistent(own)
    ensures Lookup(Merged(pool, linked, own), key) == Some(v) <==> Wins(pool, linked, own, key, v)
  {
    var base := Merge(map[], pool);
    MergeOverrides(map[], pool, key);
    MergeOverrides(base, linked, key);
    MergeOverrides(Merge(base, linked), own, key);
  }

  lemma ListedWins(pool: seq<Row>, linked: seq<Row>, own: seq<Row>, out: seq<(string, string)>)
    requires Lists(out, Merged(pool, linked, own))
    ensures Consistent(pool) && Consistent(linked) && Consistent(own) ==>
      forall key, v :: (key, v) in out <==> Wins(pool, linked, own, key, v)
  {
    if Consistent(pool) && Consistent(linked) && Consistent(own) {
      forall key, v ensures (key, v) in out <==> Wins(pool, linked, own, key, v) {
        LayersOverride(pool, linked, own, key, v);
        assert (key, v) in out <==> Lookup(Merged(pool, linked, own), key) == Some(v);
      }
    }
  }

  // ---------- the order of rows ----------

  lemma SameLookups(a: Env, b: Env)
    requires forall key :: Lookup(a, key) == Lookup(b, key)
    ensures a == b
  {
    forall key ensures key in a <==> key in b {
      assert Lookup(a, key) == Lookup(b, key);
    }
    forall key <- a ensures a[key] == b[key] {
      assert Lookup(a, key) == Lookup(b, key);
    }
  }

  lemma SameRows(rows: seq<Row>, other: seq<Row>, r: Row)
    requires multiset(rows) == multiset(other)
    ensures r in rows <==> r in other
  {
    assert r in multiset(rows) <==> r in multiset(other);
  }

  lemma MergeOfReordered(m: Env, rows: seq<Row>, other: seq<Row>)
    requires Consistent(rows) && multiset(other) == multiset(rows)
    ensures Merge(m, other) == Merge(m, rows)
  {
    forall key ensures Lookup(Merge(m, other), key) == Lookup(Merge(m, rows), key) {
      MergeAt(m, rows, key);
      MergeAt(m, other, key);
      LastOfIsThere(rows, key);
      LastOfIsThere(other, key);
      forall v ensures HasValue(other, key, v) <==> HasValue(rows, key, v) {
        SameRows(rows, other, Row(key, Some(v)));
      }
      if HasKey(rows, key) {
        ConsistentValues(rows, key, LastOf(rows, key).value, LastOf(other, key).value);
      }
    }
    SameLookups(Merge(m, other), Merge(m, rows));
  }

  /** The row at `i` moved to the end. */
  function MovedLast(rows: seq<Row>, i: nat): seq<Row>
    requires i < |rows|
  {
    rows[..i] + rows[i + 1..] + [rows[i]]
  }

  lemma MovedLastReorders(rows: seq<Row>, i: nat)
    requires i < |rows|
    ensures multiset(MovedLast(rows, i)) == multiset(rows)
  {
    assert rows == rows[..i] + ([rows[i]] + rows[i + 1..]);
  }

  lemma LastRowWins(m: Env, rows: seq<Row>, i: nat)
    requires i < |rows| && rows[i].value.Some?
    ensures Lookup(Merge(m, MovedLast(rows, i)), rows[i].key) == rows[i].value
  {
    var moved := MovedLast(rows, i);
    assert moved[|moved| - 1] == rows[i];
  }

  /**
   The order in which the rows of a layer arrive cannot show exactly when the layer is consistent: in an
   inconsistent one the last row of a key wins, whichever that is.
   */
  lemma OrderIsIrrelevantExactly(m: Env, rows: seq<Row>)
    ensures Consistent(rows) <==>
      forall other :: multiset(other) == multiset(rows) ==> Merge(m, other) == Merge(m, rows)
  {
    if Consistent(rows) {
      forall other | multiset(other) == multiset(rows) ensures Merge(m, other) == Merge(m, rows) {
        MergeOfReordered(m, rows, other);
      }
    } else {
      var i, j :| 0 <= i < j < |rows| && Clash(rows[i], rows[j]);
      var (a, b) := (MovedLast(rows, i), MovedLast(rows, j));
      MovedLastReorders(rows, i);
      MovedLastReorders(rows, j);
      LastRowWins(m, rows, i);
      LastRowWins(m, rows, j);
      assert Merge(m, a) != Merge(m, b);
    }
  }

  /** So with consistent layers the resolvers return the same list for any order of any layer's rows. */
  lemma ResolutionIgnoresOrder(pool: seq<Row>, linked: seq<Row>, own: seq<Row>, pool': seq<Row>, linked': seq<Row>,
                               own': seq<Row>, out: seq<(string, string)>, out': seq<(string, string)>)
    requires Consistent(pool) && Consistent(linked) && Consistent(own)
    requires multiset(pool') == multiset(pool) && multiset(linked') == multiset(linked)
      && multiset(own') == multiset(own)
    requires Sorted(out) && Lists(out, Merged(pool, linked, own))
    requires Sorted(out') && Lists(out', Merged(pool', linked', own'))
    ensures out == out'
  {
    MergeOfReordered(map[], pool, pool');
    MergeOfReordered(Merge(map[], pool), linked, linked');
    MergeOfReordered(Merge(Merge(map[], pool), linked), own, own');
    ListingIsUnique(out, out', Merged(pool, linked, own));
  }

  // ---------- the effective environment of the tables ----------

  /** `ids` lists the set `s`, in any order. */
  ghost predicate Enumerates(ids: seq<Id>, s: set<Id>) {
    && (forall i, j :: 0 <= i < j < |ids| ==> ids[i] != ids[j])
    && (forall id :: id in ids <==> id in s)
  }

  /** Pool variables linked by an instance; with `plainOnly`, the non-secret ones. */
  ghost function LinkedIds(c: Tables, instance: Id, plainOnly: bool): set<Id> {
    set id | id in c.pool && (instance, id) in c.links && (plainOnly ==> !c.pool[id].secret)
  }

  ghost function OwnIds(c: Tables, instance: Id, plainOnly: bool): set<Id> {
    set k | k in c.locals && c.locals[k].instance == instance && (plainOnly ==> !c.locals[k].secret)
  }

  function PoolRows(c: Tables, ids: seq<Id>): (r: seq<Row>)
    requires forall id <- ids :: id in c.pool
    ensures |r| == |ids|
    ensures forall i :: 0 <= i < |ids| ==> r[i] == Row(c.pool[ids[i]].key, c.pool[ids[i]].value)
  {
    if |ids| == 0 then [] else [Row(c.pool[ids[0]].key, c.pool[ids[0]].value)] + PoolRows(c, ids[1..])
  }

  function LocalRows(c: Tables, ids: seq<Id>): (r: seq<Row>)
    requires forall k <- ids :: k in c.locals
    ensures |r| == |ids|
    ensures forall i :: 0 <= i < |ids| ==> r[i] == Row(c.locals[ids[i]].key, c.locals[ids[i]].value)
  {
    if |ids| == 0 then [] else [Row(c.locals[ids[0]].key, c.locals[ids[0]].value)] + LocalRows(c, ids[1..])
  }

  ghost predicate LinksValue(c: Tables, instance: Id, key: string, plainOnly: bool, id: Id) {
    id in LinkedIds(c, instance, plainOnly) && c.pool[id].key == key && c.pool[id].value.Some?
  }

  ghost predicate OwnsValue(c: Tables, instance: Id, key: string, plainOnly: bool, k: Id) {
    k in OwnIds(c, instance, plainOnly) && c.locals[k].key == key && c.locals[k].value.Some?
  }

  ghost function LinkedAt(c: Tables, instance: Id, key: string, plainOnly: bool): Option<string> {
    if id :| LinksValue(c, instance, key, plainOnly, id) then c.pool[id].value else None
  }

  ghost function OwnAt(c: Tables, instance: Id, key: string, plainOnly: bool): Option<string> {
    if k :| OwnsValue(c, instance, key, plainOnly, k) then c.locals[k].value else None
  }

  /** The value of `key` for an instance: its own, or else the linked one. */
  ghost function EffectiveAt(c: Tables, instance: Id, key: string, plainOnly: bool): Option<string> {
    var own := OwnAt(c, instance, key, plainOnly);
    if own.Some? then own else LinkedAt(c, instance, key, plainOnly)
  }

  lemma LinkedRowsConsistent(c: Tables, instance: Id, plainOnly: bool, ids: seq<Id>)
    requires Inv(c) && Enumerates(ids, LinkedIds(c, instance, plainOnly))
    ensures Consistent(PoolRows(c, ids))
  {
    assert forall id <- ids :: id in c.pool;
    forall i, j | 0 <= i < j < |ids| ensures c.pool[ids[i]].key != c.pool[ids[j]].key {
      assert ids[i] in ids && ids[j] in ids;
      LinkIsSound(c, instance, ids[i]);
      LinkIsSound(c, instance, ids[j]);
    }
  }

  lemma OwnRowsConsistent(c: Tables, instance: Id, plainOnly: bool, ids: seq<Id>)
    requires Inv(c) && Enumerates(ids, OwnIds(c, instance, plainOnly))
    ensures Consistent(LocalRows(c, ids))
  {
    assert forall k <- ids :: k in c.locals;
    forall i, j | 0 <= i < j < |ids| ensures c.locals[ids[i]].key != c.locals[ids[j]].key {
      assert ids[i] in ids && ids[j] in ids;
    }
  }

  /** The row of `id` is in the listing, and no other row of the listing has its key and a value. */
  lemma LinkedRowFound(c: Tables, instance: Id, plainOnly: bool, ids: seq<Id>, key: string, id: Id)
    requires Inv(c) && Enumerates(ids, LinkedIds(c, instance, plainOnly)) && LinksValue(c, instance, key, plainOnly, id)
    ensures HasValue(PoolRows(c, ids), key, c.pool[id].value.value)
  {
    var i :| 0 <= i < |ids| && ids[i] == id;
    assert PoolRows(c, ids)[i] in PoolRows(c, ids);
  }

  lemma LinkedRowAbsent(c: Tables, instance: Id, plainOnly: bool, ids: seq<Id>, key: string, v: string)
    requires Inv(c) && Enumerates(ids, LinkedIds(c, instance, plainOnly)) && HasValue(PoolRows(c, ids), key, v)
    ensures exists id :: LinksValue(c, instance, key, plainOnly, id)
  {
    var rows := PoolRows(c, ids);
    var i :| 0 <= i < |rows| && rows[i] == Row(key, Some(v));
    assert ids[i] in ids;
    assert LinksValue(c, instance, key, plainOnly, ids[i]);
  }

  lemma OwnRowFound(c: Tables, instance: Id, plainOnly: bool, ids: seq<Id>, key: string, k: Id)
    requires Inv(c) && Enumerates(ids, OwnIds(c, instance, plainOnly)) && OwnsValue(c, instance, key, plainOnly, k)
    ensures HasValue(LocalRows(c, ids), key, c.locals[k].value.value)
  {
    var i :| 0 <= i < |ids| && ids[i] == k;
    assert LocalRows(c, ids)[i] in LocalRows(c, ids);
  }

  lemma OwnRowAbsent(c: Tables, instance: Id, plainOnly: bool, ids: seq<Id>, key: string, v: string)
    requires Inv(c) && Enumerates(ids, OwnIds(c, instance, plainOnly)) && HasValue(LocalRows(c, ids), key, v)
    ensures exists k :: OwnsValue(c, instance, key, plainOnly, k)
  {
    var rows := LocalRows(c, ids);
    var i :| 0 <= i < |rows| && rows[i] == Row(key, Some(v));
    assert ids[i] in ids;
    assert OwnsValue(c, instance, key, plainOnly, ids[i]);
  }

  lemma LinkedLayer(c: Tables, instance: Id, plainOnly: bool, ids: seq<Id>, m: Env, key: string)
    requires Inv(c) && Enumerates(ids, LinkedIds(c, instance, plainOnly))
    ensures var linked := LinkedAt(c, instance, key, plainOnly);
      Lookup(Merge(m, PoolRows(c, ids)), key) == if linked.Some? then linked else Lookup(m, key)
  {
    var rows := PoolRows(c, ids);
    LinkedRowsConsistent(c, instance, plainOnly, ids);
    MergeOverrides(m, rows, key);
    if id :| LinksValue(c, instance, key, plainOnly, id) {
      LinkedRowFound(c, instance, plainOnly, ids, key, id);
      LinkedIs(c, instance, key, plainOnly, id);
    } else {
      forall v ensures !HasValue(rows, key, v) {
        if HasValue(rows, key, v) { LinkedRowAbsent(c, instance, plainOnly, ids, key, v); }
      }
    }
  }

  lemma LinkIsSound(c: Tables, instance: Id, id: Id)
    requires LinksResolve(c) && (instance, id) in c.links
    ensures CanLink(c, instance, id)
  {
    var l := (instance, id);
    assert CanLink(c, l.0, l.1);
  }

  /** An instance links at most one variable of a key, so the layer is a map. */
  lemma LinkedIs(c: Tables, instance: Id, key: string, plainOnly: bool, id: Id)
    requires Inv(c) && LinksValue(c, instance, key, plainOnly, id)
    ensures LinkedAt(c, instance, key, plainOnly) == c.pool[id].value
  {
    forall other | LinksValue(c, instance, key, plainOnly, other) ensures other == id {
      LinkIsSound(c, instance, other);
      LinkIsSound(c, instance, id);
    }
  }

  lemma OwnIs(c: Tables, instance: Id, key: string, plainOnly: bool, k: Id)
    requires Inv(c) && OwnsValue(c, instance, key, plainOnly, k)
    ensures OwnAt(c, instance, key, plainOnly) == c.locals[k].value
  {
    assert forall other :: OwnsValue(c, instance, key, plainOnly, other) ==> other == k;
  }

  lemma OwnLayer(c: Tables, instance: Id, plainOnly: bool, ids: seq<Id>, m: Env, key: string)
    requires Inv(c) && Enumerates(ids, OwnIds(c, instance, plainOnly))
    ensures var own := OwnAt(c, instance, key, plainOnly);
      Lookup(Merge(m, LocalRows(c, ids)), key) == if own.Some? then own else Lookup(m, key)
  {
    var rows := LocalRows(c, ids);
    OwnRowsConsistent(c, instance, plainOnly, ids);
    MergeOverrides(m, rows, key);
    if k :| OwnsValue(c, instance, key, plainOnly, k) {
      OwnRowFound(c, instance, plainOnly, ids, key, k);
      OwnIs(c, instance, key, plainOnly, k);
    } else {
      forall v ensures !HasValue(rows, key, v) {
        if HasValue(rows, key, v) { OwnRowAbsent(c, instance, plainOnly, ids, key, v); }
      }
    }
  }

  /**
   The resolver on the tables, for any order in which the two queries return their rows: the key-sorted list
   of the effective environment. With `plainOnly` this is the build environment.
   */
  method ResolveInstanceEnv(c: Tables, instance: Id, plainOnly: bool, linked: seq<Id>, own: seq<Id>)
    returns (out: seq<(string, string)>)
    requires Inv(c)
    requires Enumerates(linked, LinkedIds(c, instance, plainOnly)) && Enumerates(own, OwnIds(c, instance, plainOnly))
    ensures Sorted(out)
    ensures forall key, value :: (key, value) in out <==> EffectiveAt(c, instance, key, plainOnly) == Some(value)
  {
    out := ResolveEnv(PoolRows(c, linked), LocalRows(c, own));
    ghost var m1 := Merge(map[], PoolRows(c, linked));
    assert Merge(map[], []) == map[];
    forall key, value ensures (key, value) in out <==> EffectiveAt(c, instance, key, plainOnly) == Some(value) {
      LinkedLayer(c, instance, plainOnly, linked, map[], key);
      OwnLayer(c, instance, plainOnly, own, m1, key);
      assert (key, value) in out <==> Lookup(Merge(m1, LocalRows(c, own)), key) == Some(value);
    }
  }

  // ---------- linking wins ----------

  /**
   Linking a variable gives its key the pool's value (or no value, if that does not decrypt) and leaves every
   other key, and every other instance, as it was.
   */
  lemma LinkingWins(c: Tables, instance: Id, id: Id, other: Id, key: string)
    requires Inv(c) && CanLink(c, instance, id)
    ensures var d := Link(c, instance, id);
      EffectiveAt(d, other, key, false) ==
        if other == instance && key == c.pool[id].key then c.pool[id].value else EffectiveAt(c, other, key, false)
  {
    var d := Link(c, instance, id);
    LinkKeepsInv(c, instance, id);
    if other == instance && key == c.pool[id].key {
      assert forall k :: !OwnsValue(d, instance, key, false, k);
      if c.pool[id].value.Some? {
        assert LinksValue(d, instance, key, false, id);
        LinkedIs(d, instance, key, false, id);
      } else {
        forall x ensures !LinksValue(d, instance, key, false, x) {
          if LinksValue(d, instance, key, false, x) {
            LinkIsSound(d, instance, x);
            LinkIsSound(d, instance, id);
          }
        }
      }
    } else {
      SameOwn(c, d, other, key);
      SameLinked(c, d, other, key);
    }
  }

  lemma SameOwn(c: Tables, d: Tables, instance: Id, key: string)
    requires Inv(c)
    requires forall k :: OwnsValue(c, instance, key, false, k) <==> OwnsValue(d, instance, key, false, k)
    requires forall k :: OwnsValue(c, instance, key, false, k) ==>
      k in d.locals && d.locals[k].value == c.locals[k].value
    ensures OwnAt(d, instance, key, false) == OwnAt(c, instance, key, false)
  {
    if k :| OwnsValue(c, instance, key, false, k) {
      OwnIs(c, instance, key, false, k);
    }
  }

  lemma SameLinked(c: Tables, d: Tables, instance: Id, key: string)
    requires Inv(c)
    requires forall id :: LinksValue(c, instance, key, false, id) <==> LinksValue(d, instance, key, false, id)
    requires forall id :: LinksValue(c, instance, key, false, id) ==>
      id in d.pool && d.pool[id].value == c.pool[id].value
    ensures LinkedAt(d, instance, key, false) == LinkedAt(c, instance, key, false)
  {
    if id :| LinksValue(c, instance, key, false, id) {
      LinkedIs(c, instance, key, false, id);
    }
  }

  /**
   Deleting variables of the pool takes their keys from exactly the instances that had linked them, down to the
   own value if there is one; nothing else changes.
   */
  lemma DropEffect(c: Tables, ids: set<Id>, instance: Id, key: string)
    requires Inv(c)
    ensures var hit := exists id :: id in ids && id in c.pool && (instance, id) in c.links && c.pool[id].key == key;
      EffectiveAt(Drop(c, ids), instance, key, false) ==
        if hit then OwnAt(c, instance, key, false) else EffectiveAt(c, instance, key, false)
  {
    var d := Drop(c, ids);
    DropKeepsInv(c, ids);
    SameOwn(c, d, instance, key);
    if id :| id in ids && id in c.pool && (instance, id) in c.links && c.pool[id].key == key {
      OnlyLinkOfKey(c, d, instance, id);
    } else {
      SameLinked(c, d, instance, key);
    }
  }

  /** Unlinking does the same to one instance. */
  lemma UnlinkEffect(c: Tables, instance: Id, id: Id, other: Id, key: string)
    requires Inv(c) && (instance, id) in c.links && id in c.pool
    ensures var d := c.(links := c.links - {(instance, id)});
      EffectiveAt(d, other, key, false) ==
        if other == instance && key == c.pool[id].key then OwnAt(c, other, key, false)
        else EffectiveAt(c, other, key, false)
  {
    var d := c.(links := c.links - {(instance, id)});
    SameOwn(c, d, other, key);
    if other == instance && key == c.pool[id].key {
      OnlyLinkOfKey(c, d, instance, id);
    } else {
      SameLinked(c, d, other, key);
    }
  }

  /** Deleting an instance's own variable shows the linked one of that key again, if there is one. */
  lemma DeleteLocalEffect(c: Tables, k: Id, instance: Id, key: string)
    requires Inv(c) && k in c.locals
    ensures var d := c.(locals := map j | j in c.locals && j != k :: c.locals[j]);
      EffectiveAt(d, instance, key, false) ==
        if LocalAt(c, instance, key, k) then LinkedAt(c, instance, key, false) else EffectiveAt(c, instance, key, false)
  {
    var d := c.(locals := map j | j in c.locals && j != k :: c.locals[j]);
    SameLinked(c, d, instance, key);
    if LocalAt(c, instance, key, k) {
      assert forall j :: !OwnsValue(d, instance, key, false, j);
    } else {
      SameOwn(c, d, instance, key);
    }
  }

  /** An instance links one variable of a key: without that link it links none. */
  lemma OnlyLinkOfKey(c: Tables, d: Tables, instance: Id, id: Id)
    requires Inv(c) && (instance, id) in c.links && id in c.pool
    requires d.links <= c.links && (instance, id) !in d.links
    requires forall x :: x in d.pool ==> x in c.pool && d.pool[x] == c.pool[x]
    ensures LinkedAt(d, instance, c.pool[id].key, false) == None
  {
    forall x ensures !LinksValue(d, instance, c.pool[id].key, false, x) {
      if LinksValue(d, instance, c.pool[id].key, false, x) {
        LinkIsSound(c, instance, x);
        LinkIsSound(c, instance, id);
      }
    }
  }

  // ---------- writes to the pool ----------

  /** An instance sees a write to a row of the pool only if it links the row and has no own value there. */
  ghost predicate Sees(c: Tables, instance: Id, at: Id, key: string) {
    at in c.pool && (instance, at) in c.links && OwnAt(c, instance, key, false) == None
  }

  /**
   Any write that fits, a rename included: the new key gets the new value and the old key loses its own, on exactly
   the instances that see the row at that key. Nothing else changes.
   */
  lemma WriteEffect(c: Tables, at: Id, w: PoolVar, instance: Id, key: string)
    requires Inv(c) && Inv(Write(c, at, w))
    ensures EffectiveAt(Write(c, at, w), instance, key, false) ==
      if Sees(c, instance, at, key) && key == w.key then w.value
      else if Sees(c, instance, at, key) && key == c.pool[at].key then None
      else EffectiveAt(c, instance, key, false)
  {
    var d := Write(c, at, w);
    SameOwn(c, d, instance, key);
    if (instance, at) in c.links {
      LinkIsSound(c, instance, at);
      LinkIsSound(d, instance, at);
      WrittenLink(c, at, w, instance, key);
    } else {
      SameLinked(c, d, instance, key);
    }
  }

  lemma WrittenLink(c: Tables, at: Id, w: PoolVar, instance: Id, key: string)
    requires Inv(c) && Inv(Write(c, at, w)) && at in c.pool && (instance, at) in c.links
    ensures LinkedAt(Write(c, at, w), instance, key, false) ==
      if key == w.key then w.value
      else if key == c.pool[at].key then None
      else LinkedAt(c, instance, key, false)
  {
    var d := Write(c, at, w);
    if key == w.key {
      if w.value.Some? {
        assert LinksValue(d, instance, key, false, at);
        LinkedIs(d, instance, key, false, at);
      } else {
        NoOtherLink(d, instance, at, key);
      }
    } else if key == c.pool[at].key {
      forall x ensures !LinksValue(d, instance, key, false, x) {
        if LinksValue(d, instance, key, false, x) {
          LinkIsSound(c, instance, x);
          LinkIsSound(c, instance, at);
        }
      }
    } else {
      SameLinked(c, d, instance, key);
    }
  }

  lemma NoOtherLink(c: Tables, instance: Id, at: Id, key: string)
    requires Inv(c) && at in c.pool && (instance, at) in c.links && c.pool[at].key == key && c.pool[at].value.None?
    ensures LinkedAt(c, instance, key, false) == None
  {
    forall x ensures !LinksValue(c, instance, key, false, x) {
      if LinksValue(c, instance, key, false, x) {
        LinkIsSound(c, instance, x);
        LinkIsSound(c, instance, at);
      }
    }
  }

  /** Upserts, which manual, BaaS, rotating and first publishes are: the key's new value, where it is linked. */
  lemma UpsertEffect(c: Tables, newId: Id, v: PoolVar, keepSourceId: bool, instance: Id, key: string)
    requires Inv(c) && newId !in c.pool && Inv(Upsert(c, newId, v, keepSourceId))
    requires instance in c.projectOf && c.projectOf[instance] == v.project
    ensures EffectiveAt(Upsert(c, newId, v, keepSourceId), instance, key, false) ==
      if key == v.key && LinksKey(c, instance, key) && OwnAt(c, instance, key, false) == None then v.value
      else EffectiveAt(c, instance, key, false)
  {
    var at, w := UpsertWrites(c, newId, v, keepSourceId);
    WriteEffect(c, at, w, instance, key);
    if id :| id in c.pool && (instance, id) in c.links && c.pool[id].key == v.key {
      LinkIsSound(c, instance, id);
      assert IsAt(c, v.project, v.key, id);
    }
  }

  /** Instances of other projects see nothing of it. */
  lemma UpsertElsewhere(c: Tables, newId: Id, v: PoolVar, keepSourceId: bool, instance: Id, key: string)
    requires Inv(c) && newId !in c.pool && Inv(Upsert(c, newId, v, keepSourceId))
    requires instance in c.projectOf ==> c.projectOf[instance] != v.project
    ensures EffectiveAt(Upsert(c, newId, v, keepSourceId), instance, key, false) == EffectiveAt(c, instance, key, false)
  {
    var at, w := UpsertWrites(c, newId, v, keepSourceId);
    WriteEffect(c, at, w, instance, key);
    if at in c.pool && (instance, at) in c.links {
      LinkIsSound(c, instance, at);
    }
  }

  /** A republish: the new value under the key the row has, whatever key is suggested. */
  lemma RepublishEffect(c: Tables, newId: Id, v: PoolVar, id: Id, instance: Id, key: string)
    requires Inv(c) && newId !in c.pool && v.sourceId.Some? && SingleVar(v.source)
    requires IsOwned(c, v.project, v.source, v.sourceId.value, id)
    ensures EffectiveAt(Publish(c, newId, v), instance, key, false) ==
      if Sees(c, instance, id, key) && key == c.pool[id].key then v.value else EffectiveAt(c, instance, key, false)
  {
    PublishRefreshes(c, newId, v, id);
    PublishKeepsInv(c, newId, v);
    WriteEffect(c, id, c.pool[id].(value := v.value, secret := v.secret), instance, key);
  }

  /** A rename moves the value from the old key to the new one, on the instances that see it there. */
  lemma RenameEffect(c: Tables, project: Id, id: Id, newKey: string, instance: Id, key: string)
    requires Inv(c) && CanRename(c, project, id, newKey)
    ensures EffectiveAt(Rename(c, id, newKey), instance, key, false) ==
      if Sees(c, instance, id, key) && key == newKey then c.pool[id].value
      else if Sees(c, instance, id, key) && key == c.pool[id].key then None
      else EffectiveAt(c, instance, key, false)
  {
    RenameKeepsInv(c, project, id, newKey);
    WriteEffect(c, id, c.pool[id].(key := newKey), instance, key);
  }

  ghost predicate SeesBucketRow(c: Tables, project: Id, bucket: Id, instance: Id, key: string, id: Id) {
    IsOwned(c, project, STORAGE, bucket, id) && c.pool[id].key == key && Sees(c, instance, id, key)
  }

  /** Refreshing a bucket: its new credentials, on the instances that see one of its rows, and nothing else. */
  lemma RefreshBucketEffect(c: Tables, project: Id, bucket: Id, appId: string, secretKey: string,
                            instance: Id, key: string)
    requires Inv(c)
    ensures var d := RefreshBucket(c, project, bucket, appId, secretKey);
      && (forall id :: SeesBucketRow(c, project, bucket, instance, key, id) ==>
            EffectiveAt(d, instance, key, false) == Some(if c.pool[id].secret then secretKey else appId))
      && ((forall id :: !SeesBucketRow(c, project, bucket, instance, key, id)) ==>
            EffectiveAt(d, instance, key, false) == EffectiveAt(c, instance, key, false))
  {
    var d := RefreshBucket(c, project, bucket, appId, secretKey);
    ValuesKeepInv(c, d);
    SameOwn(c, d, instance, key);
    if OwnAt(c, instance, key, false) == None {
      if id :| SeesBucketRow(c, project, bucket, instance, key, id) {
        forall x | SeesBucketRow(c, project, bucket, instance, key, x) ensures x == id {
          LinkIsSound(c, instance, x);
          LinkIsSound(c, instance, id);
        }
        assert LinksValue(d, instance, key, false, id);
        LinkedIs(d, instance, key, false, id);
      } else {
        UnseenBucket(c, project, bucket, appId, secretKey, instance, key);
      }
    }
  }

  lemma UnseenBucket(c: Tables, project: Id, bucket: Id, appId: string, secretKey: string, instance: Id, key: string)
    requires Inv(c) && OwnAt(c, instance, key, false) == None
    requires forall id :: !SeesBucketRow(c, project, bucket, instance, key, id)
    ensures var d := RefreshBucket(c, project, bucket, appId, secretKey);
      LinkedAt(d, instance, key, false) == LinkedAt(c, instance, key, false)
  {
    var d := RefreshBucket(c, project, bucket, appId, secretKey);
    forall id ensures LinksValue(c, instance, key, false, id) <==> LinksValue(d, instance, key, false, id) {
      assert !SeesBucketRow(c, project, bucket, instance, key, id);
    }
    forall id | LinksValue(c, instance, key, false, id) ensures id in d.pool && d.pool[id].value == c.pool[id].value {
      assert !SeesBucketRow(c, project, bucket, instance, key, id);
    }
    SameLinked(c, d, instance, key);
  }

  ghost function LinkAll(c: Tables, instance: Id, ids: seq<Id>): (d: Tables)
    requires forall id <- ids :: id in c.pool
    ensures d.pool == c.pool && d.projectOf == c.projectOf
  {
    if |ids| == 0 then c else Link(LinkAll(c, instance, ids[..|ids| - 1]), instance, ids[|ids| - 1])
  }

  /** A sequence of links sets exactly the keys of the linked variables, in any order. */
  lemma {:induction false} LinkingManyWins(c: Tables, instance: Id, ids: seq<Id>, key: string)
    requires Inv(c) && forall id <- ids :: id in c.pool && CanLink(c, instance, id)
    ensures var d := LinkAll(c, instance, ids);
      && Inv(d)
      && (forall id <- ids :: c.pool[id].key == key ==> EffectiveAt(d, instance, key, false) == c.pool[id].value)
      && ((forall id <- ids :: c.pool[id].key != key) ==>
           EffectiveAt(d, instance, key, false) == EffectiveAt(c, instance, key, false))
  {
    if |ids| > 0 {
      var init, last := ids[..|ids| - 1], ids[|ids| - 1];
      LinkingManyWins(c, instance, init, key);
      var before := LinkAll(c, instance, init);
      LinkKeepsInv(before, instance, last);
      LinkingWins(before, instance, last, instance, key);
      assert forall id <- ids :: id in init || id == last;
      assert last in ids;
      forall id <- ids | c.pool[id].key == key && c.pool[last].key == key ensures id == last {
        assert CanLink(c, instance, id) && CanLink(c, instance, last);
      }
    }
  }

  // ---------- an instance's own variables ----------

  lemma SetLocalEffect(c: Tables, newId: Id, v: LocalVar, instance: Id, key: string)
    requires Inv(c) && newId !in c.locals && v.value.Some?
    ensures OwnAt(SetLocal(c, newId, v), instance, key, false) ==
      if instance == v.instance && key == v.key then v.value else OwnAt(c, instance, key, false)
  {
    var d := SetLocal(c, newId, v);
    SetLocalKeepsInv(c, newId, v);
    var at := if k: nat :| LocalAt(c, v.instance, v.key, k) then k else newId;
    assert d.locals == c.locals[at := v];
    if instance == v.instance && key == v.key {
      assert OwnsValue(d, instance, key, false, at);
      OwnIs(d, instance, key, false, at);
    } else {
      SameOwn(c, d, instance, key);
    }
  }

  /** The last value given to a key in a list of variables. */
  function LastValue(vs: seq<LocalVar>, key: string): Option<string> {
    if |vs| == 0 then None
    else if vs[|vs| - 1].key == key then vs[|vs| - 1].value
    else LastValue(vs[..|vs| - 1], key)
  }

  /** A bulk update replaces the whole set of an instance's variables, the last of equal keys winning. */
  lemma {:induction false} BulkReplaces(c: Tables, target: Id, newIds: seq<Id>, vs: seq<LocalVar>, instance: Id,
          key: string)
    requires Inv(c) && |newIds| == |vs| && FreshLocalIds(c, newIds)
    requires forall v <- vs :: v.instance == target && v.value.Some?
    ensures OwnAt(SetLocals(ClearLocals(c, target), newIds, vs), instance, key, false) ==
      if instance == target then LastValue(vs, key) else OwnAt(c, instance, key, false)
  {
    if |vs| == 0 {
      var d := ClearLocals(c, target);
      if instance != target {
        SameOwn(c, d, instance, key);
      }
    } else {
      var n := |vs| - 1;
      BulkReplaces(c, target, newIds[..n], vs[..n], instance, key);
      var before := SetLocals(ClearLocals(c, target), newIds[..n], vs[..n]);
      ClearLocalsKeepsInv(c, target);
      SetLocalsKeepsInv(ClearLocals(c, target), newIds[..n], vs[..n]);
      assert newIds[n] !in newIds[..n];
      assert vs[n] in vs;
      SetLocalEffect(before, newIds[n], vs[n], instance, key);
    }
  }

  // ---------- the build environment ----------

  /** An own secret hides a linked variable that is not secret. */
  ghost predicate SecretShadowsPlain(c: Tables, instance: Id, key: string) {
    && (exists k :: OwnsValue(c, instance, key, false, k) && c.locals[k].secret)
    && (exists id :: LinksValue(c, instance, key, true, id))
  }

  /**
   The build environment holds non-secret values only, has no key that the full environment lacks, and agrees
   with it on every key except those where an own secret shadows a linked non-secret variable.
   */
  lemma BuildEnvAgreement(c: Tables, instance: Id, key: string)
    requires Inv(c)
    ensures var (build, full) := (EffectiveAt(c, instance, key, true), EffectiveAt(c, instance, key, false));
      && (build.Some? ==>
            || (exists k :: OwnsValue(c, instance, key, true, k) && c.locals[k].value == build && !c.locals[k].secret)
            || (exists id :: LinksValue(c, instance, key, true, id) && c.pool[id].value == build && !c.pool[id].secret))
      && (build.Some? ==> full.Some?)
      && (build.Some? && !SecretShadowsPlain(c, instance, key) ==> build == full)
      && (SecretShadowsPlain(c, instance, key) ==>
            && build == LinkedAt(c, instance, key, true) && build.Some?
            && full == OwnAt(c, instance, key, false) && full.Some?)
  {
    if k :| OwnsValue(c, instance, key, false, k) {
      OwnIs(c, instance, key, false, k);
      if c.locals[k].secret {
        assert forall j :: !OwnsValue(c, instance, key, true, j);
      } else {
        OwnIs(c, instance, key, true, k);
      }
    } else {
      assert forall j :: OwnsValue(c, instance, key, true, j) ==> OwnsValue(c, instance, key, false, j);
    }
    if id :| LinksValue(c, instance, key, true, id) {
      LinkedIs(c, instance, key, true, id);
      LinkedIs(c, instance, key, false, id);
    }
  }

  // ---------- serverless instances ----------

  /** Links of a serverless instance point into the pool of its own project. */
  ghost predicate LinkedRows(linked: seq<Row>, pool: seq<Row>) {
    forall r <- linked :: r in pool
  }

  /** Pool rows that clash are hidden by an own row. */
  ghost predicate Settled(pool: seq<Row>, own: seq<Row>) {
    forall i, j :: 0 <= i < j < |pool| && Clash(pool[i], pool[j]) ==> HasKey(own, pool[i].key)
  }

  /**
   With `inherit` set, the links do not matter to the result, whatever they are, exactly when variables of the
   pool whose keys differ only in case have the same value, or the instance has its own value for that key.
   */
  lemma InheritIgnoresLinksExactly(pool: seq<Row>, own: seq<Row>, upper: string -> string)
    ensures Settled(Upper(pool, upper), Upper(own, upper)) <==>
      forall linked :: LinkedRows(linked, pool) ==>
        Merged(Upper(pool, upper), Upper(linked, upper), Upper(own, upper))
          == Merged(Upper(pool, upper), [], Upper(own, upper))
  {
    var (rows, mine) := (Upper(pool, upper), Upper(own, upper));
    if Settled(rows, mine) {
      forall linked | LinkedRows(linked, pool)
        ensures Merged(rows, Upper(linked, upper), mine) == Merged(rows, [], mine)
      {
        UpperLinked(linked, pool, upper);
        SettledIgnoresLinks(rows, Upper(linked, upper), mine);
      }
    } else {
      var i, j :| 0 <= i < j < |rows| && Clash(rows[i], rows[j]) && !HasKey(mine, rows[i].key);
      var (a, b) := ([pool[i]], [pool[j]]);
      LinkShows(rows, Upper(a, upper), mine, rows[i]);
      LinkShows(rows, Upper(b, upper), mine, rows[j]);
      assert LinkedRows(a, pool) && LinkedRows(b, pool);
      assert Merged(rows, Upper(a, upper), mine) != Merged(rows, Upper(b, upper), mine);
    }
  }

  lemma UpperLinked(linked: seq<Row>, pool: seq<Row>, upper: string -> string)
    requires LinkedRows(linked, pool)
    ensures LinkedRows(Upper(linked, upper), Upper(pool, upper))
  {
    forall r <- Upper(linked, upper) ensures r in Upper(pool, upper) {
      var i :| 0 <= i < |linked| && Upper(linked, upper)[i] == r;
      assert linked[i] in linked;
      var j :| 0 <= j < |pool| && pool[j] == linked[i];
      assert Upper(pool, upper)[j] == r;
    }
  }

  lemma SettledIgnoresLinks(pool: seq<Row>, linked: seq<Row>, own: seq<Row>)
    requires Settled(pool, own) && LinkedRows(linked, pool)
    ensures Merged(pool, linked, own) == Merged(pool, [], own)
  {
    var base := Merge(map[], pool);
    forall key ensures Lookup(Merged(pool, linked, own), key) == Lookup(Merged(pool, [], own), key) {
      MergeAt(Merge(base, linked), own, key);
      MergeAt(base, own, key);
      LastOfIsThere(own, key);
      if !HasKey(own, key) {
        LinkedIsInPool(pool, linked, own, key);
      }
    }
    SameLookups(Merged(pool, linked, own), Merged(pool, [], own));
  }

  lemma LinkedIsInPool(pool: seq<Row>, linked: seq<Row>, own: seq<Row>, key: string)
    requires Settled(pool, own) && LinkedRows(linked, pool) && !HasKey(own, key)
    ensures Lookup(Merge(Merge(map[], pool), linked), key) == Lookup(Merge(map[], pool), key)
  {
    MergeAt(Merge(map[], pool), linked, key);
    MergeAt(map[], pool, key);
    LastOfIsThere(linked, key);
    LastOfIsThere(pool, key);
    if LastOf(linked, key).Some? {
      var v := LastOf(linked, key).value;
      assert HasValue(pool, key, v);
      var i :| 0 <= i < |pool| && pool[i] == Row(key, Some(v));
      var j :| 0 <= j < |pool| && pool[j] == Row(key, LastOf(pool, key));
      assert i < j || j < i || i == j;
    }
  }

  lemma LinkShows(pool: seq<Row>, linked: seq<Row>, own: seq<Row>, r: Row)
    requires linked == [r] && r.value.Some? && !HasKey(own, r.key)
    ensures Lookup(Merged(pool, linked, own), r.key) == r.value
  {
    var base := Merge(map[], pool);
    MergeAt(Merge(base, linked), own, r.key);
    MergeAt(base, linked, r.key);
    LastOfIsThere(own, r.key);
  }

  /**
   A pool whose keys clash is reachable, since the keys of a service's variables are not upper-cased: a service can
   publish its id under one key and its secret under another that `upper` identifies with it.
   */
  lemma ClashIsReachable(key1: string, key2: string, appId: string, secret: string, upper: string -> string)
    requires key1 != key2 && upper(key1) == upper(key2) && appId != secret
    ensures var c := Tables(map[], map[], map[], {}, map[]);
      var ops := [OpCreateService(1, 7)] + ([OpBaasVar(10, 1, key1, appId)] + [OpPublishSecret(11, 1, key2, secret)]);
      && IsRun(c, ops)
      && After(c, ops).pool.Keys == {10, 11}
      && After(c, ops).pool[10].project == After(c, ops).pool[11].project == 7
      && !Settled(Upper(PoolRows(After(c, ops), [10, 11]), upper), [])
  {
    var c := Tables(map[], map[], map[], {}, map[]);
    var (op1, op2, op3) := (OpCreateService(1, 7), OpBaasVar(10, 1, key1, appId), OpPublishSecret(11, 1, key2, secret));
    var c1 := Apply(c, op1);
    assert forall id :: !IsAt(c1, 7, key1, id);
    var c2 := Apply(c1, op2);
    assert forall id :: !IsAt(c2, 7, key2, id) && !IsSecretOf(c2, 1, id);
    var c3 := Apply(c2, op3);
    RunCons(c2, op3, []);
    assert [op3] + [] == [op3];
    RunCons(c1, op2, [op3]);
    RunCons(c, op1, [op2] + [op3]);
    ClashingRows(c3, upper);
  }

  lemma ClashingRows(c: Tables, upper: string -> string)
    requires 10 in c.pool && 11 in c.pool && upper(c.pool[10].key) == upper(c.pool[11].key)
    requires c.pool[10].value.Some? && c.pool[11].value.Some? && c.pool[10].value != c.pool[11].value
    ensures !Settled(Upper(PoolRows(c, [10, 11]), upper), [])
  {
    var rows := Upper(PoolRows(c, [10, 11]), upper);
    assert Clash(rows[0], rows[1]);
  }

  lemma RunCons(c: Tables, op: Op, rest: seq<Op>)
    requires Enabled(c, op) && IsRun(Apply(c, op), rest)
    ensures IsRun(c, [op] + rest) && After(c, [op] + rest) == After(Apply(c, op), rest)
  {
    assert ([op] + rest)[1..] == rest;
  }
}
